/**
 * The file-type and permission bits of an inode's 16-bit mode word
 * (include/uapi/linux/stat.h).  The type of a file is the value of the
 * four bits under S_IFMT; the low twelve bits hold the set-user-id,
 * set-group-id and sticky flags and the three permission triples.
 */
module Stat {
  import opened Wrappers

  /** umode_t */
  type Mode = bv16

  // File-type field and its seven codes (octal 0170000, 0140000, ... in the header).
  const S_IFMT: Mode := 0xF000
  const S_IFSOCK: Mode := 0xC000
  const S_IFLNK: Mode := 0xA000
  const S_IFREG: Mode := 0x8000
  const S_IFBLK: Mode := 0x6000
  const S_IFDIR: Mode := 0x4000
  const S_IFCHR: Mode := 0x2000
  const S_IFIFO: Mode := 0x1000

  // Set-user-id, set-group-id and sticky bits.
  const S_ISUID: Mode := 0x800
  const S_ISGID: Mode := 0x400
  const S_ISVTX: Mode := 0x200

  // Permission triples for owner, group and others.
  const S_IRWXU: Mode := 0x1C0
  const S_IRUSR: Mode := 0x100
  const S_IWUSR: Mode := 0x80
  const S_IXUSR: Mode := 0x40

  const S_IRWXG: Mode := 0x38
  const S_IRGRP: Mode := 0x20
  const S_IWGRP: Mode := 0x10
  const S_IXGRP: Mode := 0x8

  const S_IRWXO: Mode := 0x7
  const S_IROTH: Mode := 0x4
  const S_IWOTH: Mode := 0x2
  const S_IXOTH: Mode := 0x1

  /** S_ISLNK */
  predicate IsSymlink(m: Mode) { m & S_IFMT == S_IFLNK }
  /** S_ISREG */
  predicate IsRegular(m: Mode) { m & S_IFMT == S_IFREG }
  /** S_ISDIR */
  predicate IsDirectory(m: Mode) { m & S_IFMT == S_IFDIR }
  /** S_ISCHR */
  predicate IsCharDevice(m: Mode) { m & S_IFMT == S_IFCHR }
  /** S_ISBLK */
  predicate IsBlockDevice(m: Mode) { m & S_IFMT == S_IFBLK }
  /** S_ISFIFO */
  predicate IsFifo(m: Mode) { m & S_IFMT == S_IFIFO }
  /** S_ISSOCK */
  predicate IsSocket(m: Mode) { m & S_IFMT == S_IFSOCK }

  datatype FileType = Socket | Symlink | Regular | BlockDevice | Directory | CharDevice | Fifo

  /** The S_IF* code of each file type. */
  function TypeCode(t: FileType): Mode
  {
    match t
    case Socket => S_IFSOCK
    case Symlink => S_IFLNK
    case Regular => S_IFREG
    case BlockDevice => S_IFBLK
    case Directory => S_IFDIR
    case CharDevice => S_IFCHR
    case Fifo => S_IFIFO
  }

  /**
   * The file type a mode word encodes, or None when its format bits hold no
   * known code.  Each S_ISx predicate holds exactly when this is its type,
   * so no mode word satisfies two of them.
   */
  function FileTypeOf(m: Mode): (r: Option<FileType>)
    ensures r == Some(Socket) <==> IsSocket(m)
    ensures r == Some(Symlink) <==> IsSymlink(m)
    ensures r == Some(Regular) <==> IsRegular(m)
    ensures r == Some(BlockDevice) <==> IsBlockDevice(m)
    ensures r == Some(Directory) <==> IsDirectory(m)
    ensures r == Some(CharDevice) <==> IsCharDevice(m)
    ensures r == Some(Fifo) <==> IsFifo(m)
    ensures r.Some? ==> m & S_IFMT == TypeCode(r.value)
  {
    var f := m & S_IFMT;
    if f == S_IFSOCK then Some(Socket)
    else if f == S_IFLNK then Some(Symlink)
    else if f == S_IFREG then Some(Regular)
    else if f == S_IFBLK then Some(BlockDevice)
    else if f == S_IFDIR then Some(Directory)
    else if f == S_IFCHR then Some(CharDevice)
    else if f == S_IFIFO then Some(Fifo)
    else None
  }

  /** Mode words that agree under S_IFMT agree on every type predicate. */
  lemma TypeDependsOnlyOnFormatBits(m1: Mode, m2: Mode)
    requires m1 & S_IFMT == m2 & S_IFMT
    ensures FileTypeOf(m1) == FileTypeOf(m2)
    ensures IsSymlink(m1) == IsSymlink(m2) && IsRegular(m1) == IsRegular(m2)
    ensures IsDirectory(m1) == IsDirectory(m2) && IsCharDevice(m1) == IsCharDevice(m2)
    ensures IsBlockDevice(m1) == IsBlockDevice(m2) && IsFifo(m1) == IsFifo(m2)
    ensures IsSocket(m1) == IsSocket(m2)
  {
  }

  /** The seven codes are distinct, non-zero and lie inside the S_IFMT field. */
  lemma TypeCodesDistinct(t1: FileType, t2: FileType)
    ensures TypeCode(t1) & S_IFMT == TypeCode(t1) && TypeCode(t1) != 0
    ensures TypeCode(t1) == TypeCode(t2) <==> t1 == t2
  {
  }

  /** At most one of the seven S_ISx predicates holds of any mode word. */
  lemma FileTypesExclusive(m: Mode)
    ensures (if IsSymlink(m) then 1 else 0) + (if IsRegular(m) then 1 else 0)
          + (if IsDirectory(m) then 1 else 0) + (if IsCharDevice(m) then 1 else 0)
          + (if IsBlockDevice(m) then 1 else 0) + (if IsFifo(m) then 1 else 0)
          + (if IsSocket(m) then 1 else 0) <= 1
  {
  }

  /** The special bits and every permission bit lie outside S_IFMT. */
  lemma ModeBitsOutsideFormat()
    ensures (S_ISUID | S_ISGID | S_ISVTX) & S_IFMT == 0
    ensures (S_IRWXU | S_IRWXG | S_IRWXO) & S_IFMT == 0
  {
  }

  /** Setting, clearing or flipping bits outside S_IFMT never changes the file type. */
  lemma NonFormatBitsPreserveType(m: Mode, p: Mode)
    requires p & S_IFMT == 0
    ensures FileTypeOf(m | p) == FileTypeOf(m)
    ensures FileTypeOf(m & !p) == FileTypeOf(m)
    ensures FileTypeOf(m ^ p) == FileTypeOf(m)
  {
    assert (m | p) & S_IFMT == m & S_IFMT;
    assert (m & !p) & S_IFMT == m & S_IFMT;
    assert (m ^ p) & S_IFMT == m & S_IFMT;
  }

  /** Each rwx triple is the union of its read, write and execute bits. */
  lemma PermissionTriples()
    ensures S_IRWXU == S_IRUSR | S_IWUSR | S_IXUSR
    ensures S_IRWXG == S_IRGRP | S_IWGRP | S_IXGRP
    ensures S_IRWXO == S_IROTH | S_IWOTH | S_IXOTH
    ensures S_IRWXU & S_IRWXG == 0 && S_IRWXG & S_IRWXO == 0 && S_IRWXU & S_IRWXO == 0
  {
  }
}
