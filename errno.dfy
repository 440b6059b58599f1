/**
 * The error numbers the block allocator returns, negated as the kernel
 * returns them.  EFSCORRUPTED and EFSBADCRC are ext4's names for EUCLEAN
 * and EBADMSG.
 */
module Errno {
  const EIO: int := 5
  const ENOMEM: int := 12
  const ENOSPC: int := 28
  const EFSBADCRC: int := 74
  const EFSCORRUPTED: int := 117
}
