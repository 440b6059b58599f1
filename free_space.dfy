/**
 * Space admission of fs/ext4/balloc.c: ext4_has_free_clusters decides
 * whether a request for n clusters may go ahead, given the per-cpu free
 * and dirty (delayed-allocation) cluster counters and the reserves kept
 * for root (r_blocks_count) and for the file system itself
 * (s_resv_clusters).
 */
module FreeSpace {
  import opened Width

  /** percpu_counter_*_positive: a counter value, or 0 when it is negative. */
  function Positive(x: int): (r: nat)
    ensures r >= x
    ensures x >= 0 ==> r == x
  {
    if x < 0 then 0 else x
  }

  /**
   * The counter values ext4_has_free_clusters can see: the cheap
   * approximate reads (percpu_counter_read_positive), which may drift from
   * the true totals, and the exact sums over all cpus.
   */
  datatype Counters = Counters(
    freeRead: nat,   // read of s_freeclusters_counter
    dirtyRead: nat,  // read of s_dirtyclusters_counter
    freeSum: int,    // sum of s_freeclusters_counter
    dirtySum: int)   // sum of s_dirtyclusters_counter

  /** The reserves: r_blocks_count from the superblock, the cluster bits, s_resv_clusters. */
  datatype Reserve = Reserve(rBlocksCount: nat, clusterBits: nat, resvClusters: nat)

  /**
   * Who asks: `privileged` stands for the credential tests (the reserved
   * uid or gid, or CAP_SYS_RESOURCE), the other two for the
   * EXT4_MB_USE_ROOT_BLOCKS and EXT4_MB_USE_RESERVED flags.
   */
  datatype Caller = Caller(privileged: bool, useRootBlocks: bool, useReserved: bool)

  /** rsv: the root-reserved clusters plus the reserved pool. */
  function TotalReserve(r: Reserve): nat
  {
    Shr(r.rBlocksCount, r.clusterBits) + r.resvClusters
  }

  /**
   * The free and dirty counts the decision uses: the approximate reads,
   * unless the margin they leave falls below the watermark, in which case
   * the exact sums.
   */
  function Reads(c: Counters, rsv: nat, n: int, watermark: int): (fd: (nat, nat))
    ensures fd == (c.freeRead, c.dirtyRead) || fd == (Positive(c.freeSum), Positive(c.dirtySum))
  {
    if c.freeRead - (n + rsv + c.dirtyRead) < watermark then
      (Positive(c.freeSum), Positive(c.dirtySum))
    else
      (c.freeRead, c.dirtyRead)
  }

  /**
   * The clusters a caller must leave untouched: nothing with
   * USE_RESERVED, the reserved pool for root-reserve users, and both
   * reserves for anyone else.
   */
  function Floor(r: Reserve, who: Caller): (f: nat)
    ensures f <= TotalReserve(r)
    ensures !who.useReserved && !who.privileged && !who.useRootBlocks ==> f == TotalReserve(r)
  {
    if who.useReserved then 0
    else if who.privileged || who.useRootBlocks then r.resvClusters
    else TotalReserve(r)
  }

  /**
   * ext4_has_free_clusters.  The three-step ladder (everyone may use what
   * lies above both reserves; root-reserve users what lies above the
   * reserved pool; USE_RESERVED callers everything) comes down to one
   * comparison with the caller's Floor.
   */
  function HasFreeClusters(c: Counters, r: Reserve, watermark: int, n: int, who: Caller): (ok: bool)
    ensures var fd := Reads(c, TotalReserve(r), n, watermark);
      ok <==> fd.0 >= n + fd.1 + Floor(r, who)
  {
    var rsv := TotalReserve(r);
    var fd := Reads(c, rsv, n, watermark);
    var free, dirty := fd.0, fd.1;
    if free >= rsv + n + dirty then true
    else if (who.privileged || who.useRootBlocks) && free >= n + dirty + r.resvClusters then true
    else who.useReserved && free >= n + dirty
  }

  /**
   * With reads that have not drifted, a request is admitted exactly when
   * the free clusters exceed the dirty ones by the request plus the
   * caller's floor.
   */
  lemma HasFreeExact(c: Counters, r: Reserve, watermark: int, n: int, who: Caller)
    requires c.freeRead == c.freeSum && c.dirtyRead == c.dirtySum
    ensures HasFreeClusters(c, r, watermark, n, who) <==> c.freeSum - c.dirtySum >= n + Floor(r, who)
  {
  }

  /**
   * The reserves hold up against drift: when each approximate read is
   * within e of the exact sum and the watermark is at least 2e, an
   * admitted request for at least one cluster leaves the caller's floor
   * free in the exact counts.
   */
  lemma HasFreeRespectsFloor(c: Counters, r: Reserve, watermark: int, n: int, who: Caller, e: nat)
    requires n >= 1 && 2 * e <= watermark
    requires c.freeSum - e <= c.freeRead <= c.freeSum + e
    requires c.dirtySum - e <= c.dirtyRead <= c.dirtySum + e
    requires HasFreeClusters(c, r, watermark, n, who)
    ensures c.freeSum - c.dirtySum >= n + Floor(r, who)
  {
    var rsv := TotalReserve(r);
    if c.freeRead - (n + rsv + c.dirtyRead) >= watermark {
      assert c.freeSum - c.dirtySum >= c.freeRead - c.dirtyRead - 2 * e;
    } else {
      assert Positive(c.freeSum) >= n;
    }
  }

  /**
   * The converse of HasFreeRespectsFloor: when the exact counts leave room
   * for the request above the caller's floor, the request is admitted,
   * whatever the approximate reads say, as long as the watermark is not
   * negative and the dirty total is not negative.
   */
  lemma HasFreeAdmitsWhenExactCovers(c: Counters, r: Reserve, watermark: int, n: int, who: Caller)
    requires watermark >= 0 && c.dirtySum >= 0
    requires c.freeSum >= n + c.dirtySum + Floor(r, who)
    ensures HasFreeClusters(c, r, watermark, n, who)
  {
    var rsv := TotalReserve(r);
    if c.freeRead - (n + rsv + c.dirtyRead) >= watermark {
      assert c.freeRead >= n + c.dirtyRead + Floor(r, who);
    } else {
      assert Reads(c, rsv, n, watermark) == (Positive(c.freeSum), c.dirtySum);
    }
  }

  /**
   * A smaller request is admitted whenever a larger one is, as long as the
   * watermark is not negative (a smaller request never moves the decision
   * from the exact sums back to a read that refuses it).
   */
  lemma HasFreeMonotone(c: Counters, r: Reserve, watermark: int, n: int, m: int, who: Caller)
    requires watermark >= 0 && m <= n
    requires HasFreeClusters(c, r, watermark, n, who)
    ensures HasFreeClusters(c, r, watermark, m, who)
  {
    var rsv := TotalReserve(r);
    if c.freeRead - (m + rsv + c.dirtyRead) >= watermark {
      assert Reads(c, rsv, m, watermark) == (c.freeRead, c.dirtyRead);
    }
  }
}
