/**
 * The allocation hint of fs/ext4/balloc.c: ext4_inode_to_goal_block picks
 * the block where allocation for a new inode should start looking, from
 * the inode's block group, its file type, the DELALLOC mount option and
 * the calling process's pid.
 */
module Goal {
  import opened Width
  import opened Geometry
  import opened Stat

  /** EXT4_FLEX_SIZE_DIR_ALLOC_SCHEME */
  const FlexSizeDirAllocScheme: nat := 4

  /** ext4_flex_bg_size: groups per flex group, 1 << s_log_groups_per_flex. */
  function FlexSize(sb: SuperInfo): (r: nat)
    ensures r >= 1
  {
    Pow2(sb.logGroupsPerFlex)
  }

  /**
   * The group whose first block anchors the goal.  With flex groups of at
   * least FlexSizeDirAllocScheme groups, the inode's group is rounded down
   * to its flex group's first group (`&= ~(flex_size - 1)`, which for a
   * power of two clears the remainder), and regular files move on to the
   * second group, leaving the first to directories and special files.
   */
  function GoalGroup(sb: SuperInfo, group: nat, mode: Mode): (t: nat)
    ensures FlexSize(sb) < FlexSizeDirAllocScheme ==> t == group
    ensures FlexSize(sb) >= FlexSizeDirAllocScheme ==>
      var first := t - (if IsRegular(mode) then 1 else 0);
      && first >= 0
      && first % FlexSize(sb) == 0
      && first <= group < first + FlexSize(sb)
  {
    var size := FlexSize(sb);
    if size >= FlexSizeDirAllocScheme then
      var first := FlexGroupFirst(group, size);
      if IsRegular(mode) then first + 1 else first
    else
      group
  }

  /**
   * group & ~(size - 1) for a power-of-two size: the group rounded down to
   * a multiple of size, fewer than size groups below it.
   */
  function FlexGroupFirst(group: nat, size: nat): (first: nat)
    requires size >= 1
    ensures first % size == 0
    ensures first <= group < first + size
  {
    var q := group / size;
    var r := group % size;
    assert group == q * size + r;
    MultipleMod(q, size);
    q * size
  }

  /**
   * The spread within the goal group: (pid % 16) sixteenths of the group,
   * or of what remains of the file system when the group is its last,
   * truncated to the signed 32-bit ext4_grpblk_t.
   */
  function Colour(sb: SuperInfo, bgStart: nat, pid: nat): (c: int)
    requires bgStart < U64 && 1 <= sb.blocksCount <= U64
  {
    var lastBlock := sb.blocksCount - 1;
    if bgStart + sb.blocksPerGroup <= lastBlock then
      Signed32((pid % 16) * (sb.blocksPerGroup / 16))
    else
      Signed32((pid % 16) * (Sub64(lastBlock, bgStart) / 16))
  }

  /**
   * ext4_inode_to_goal_block: the goal group's first block, plus the
   * colour unless DELALLOC is set, as a 64-bit block number.
   */
  function InodeToGoalBlock(sb: SuperInfo, group: nat, mode: Mode, delalloc: bool, pid: nat): (goal: nat)
    requires ValidSuper(sb) && group < U32
    ensures goal < U64
    ensures delalloc ==> goal == GroupFirstBlock(sb, GoalGroup(sb, group, mode)) % U64
  {
    var bgStart := GroupFirstBlock(sb, GoalGroup(sb, group, mode)) % U64;
    if delalloc then bgStart
    else (bgStart + Colour(sb, bgStart, pid)) % U64
  }

  /** p sixteenths (p < 16) of q never exceed q, and stay below it when q > 0. */
  lemma SixteenthsBelow(p: nat, q: nat)
    requires p < 16
    ensures p * (q / 16) <= q
    ensures q > 0 ==> p * (q / 16) < q
  {
    DivBracket(q, 16);
    MulMonotone(p, 15, q / 16);
  }

  /** A goal group that exists starts inside the file system. */
  lemma GroupStartInside(sb: SuperInfo, t: nat)
    requires ValidSuper(sb) && t < sb.groupsCount
    ensures GroupFirstBlock(sb, t) < sb.blocksCount
  {
    MulIsProduct(sb.groupsCount - 1, sb.blocksPerGroup);
    MulMonotone(t, sb.groupsCount - 1, sb.blocksPerGroup);
  }

  /**
   * When the goal group exists and a group's sixteenths fit in an int, the
   * coloured goal is a block of the file system that lies in the goal
   * group: at or after its first block and fewer than a group's blocks
   * past it.
   */
  lemma GoalInGoalGroup(sb: SuperInfo, group: nat, mode: Mode, pid: nat)
    requires ValidSuper(sb) && group < U32
    requires GoalGroup(sb, group, mode) < sb.groupsCount
    requires sb.blocksPerGroup < I32Limit
    ensures var t := GoalGroup(sb, group, mode);
      var goal := InodeToGoalBlock(sb, group, mode, false, pid);
      && GroupFirstBlock(sb, t) <= goal < sb.blocksCount
      && goal - GroupFirstBlock(sb, t) < sb.blocksPerGroup
      && LocateBlock(sb, goal).group == t
  {
    var t := GoalGroup(sb, group, mode);
    var start := GroupFirstBlock(sb, t);
    GroupStartInside(sb, t);
    assert start % U64 == start;
    var lastBlock := sb.blocksCount - 1;
    var p := pid % 16;
    var colour := ColourWithin(sb, start, pid);
    assert InodeToGoalBlock(sb, group, mode, false, pid) == start + colour;
    LocateGroupBlock(sb, t, colour);
  }

  /** The colour of a group that starts inside the file system stays inside the group and the file system. */
  lemma ColourWithin(sb: SuperInfo, start: nat, pid: nat) returns (colour: nat)
    requires 1 <= sb.blocksPerGroup < I32Limit && start < sb.blocksCount < U64
    ensures Colour(sb, start, pid) == colour
    ensures colour < sb.blocksPerGroup && start + colour < sb.blocksCount
  {
    var lastBlock := sb.blocksCount - 1;
    var p := pid % 16;
    if start + sb.blocksPerGroup <= lastBlock {
      SixteenthsBelow(p, sb.blocksPerGroup);
      colour := p * (sb.blocksPerGroup / 16);
    } else {
      assert Sub64(lastBlock, start) == lastBlock - start;
      SixteenthsBelow(p, lastBlock - start);
      colour := p * ((lastBlock - start) / 16);
    }
  }

  /**
   * With DELALLOC the goal is exactly the first block of the goal group,
   * which LocateBlock places at offset 0 of that group.
   */
  lemma DelallocGoalIsGroupStart(sb: SuperInfo, group: nat, mode: Mode, pid: nat)
    requires ValidSuper(sb) && group < U32
    requires GoalGroup(sb, group, mode) < sb.groupsCount
    ensures var t := GoalGroup(sb, group, mode);
      var goal := InodeToGoalBlock(sb, group, mode, true, pid);
      goal == GroupFirstBlock(sb, t) && LocateBlock(sb, goal) == Location(t, 0)
  {
    var t := GoalGroup(sb, group, mode);
    GroupStartInside(sb, t);
    assert B2C(sb, 0) == 0;
    LocateGroupBlock(sb, t, 0);
  }

  /**
   * Under the directory allocation scheme, regular files and other files
   * of the same flex group get neighbouring goal groups: the regular file's
   * is the one right after the other's.
   */
  lemma RegularFilesSkipFirstGroup(sb: SuperInfo, group: nat, reg: Mode, other: Mode)
    requires FlexSize(sb) >= FlexSizeDirAllocScheme
    requires IsRegular(reg) && !IsRegular(other)
    ensures GoalGroup(sb, group, reg) == GoalGroup(sb, group, other) + 1
    ensures GoalGroup(sb, group, other) % FlexSize(sb) == 0
  {
  }
}
