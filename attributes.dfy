/** The part of a `struct stat` record that the filesystem writes, and the
    POSIX mode bits it uses. Every other field of the record is zero from
    the allocation and is never written, so it is not represented. */
module Attributes {

  /** `mode_t`: a 32-bit unsigned integer. */
  type Mode = bv32

  // File-type field and the two file types used (S_IFMT, S_IFDIR, S_IFREG).
  const TypeMask: Mode := 0xF000
  const TypeDirectory: Mode := 0x4000
  const TypeRegular: Mode := 0x8000

  // Permission bits (S_IRUSR, S_IRGRP, S_IROTH, S_IXUSR, S_IXGRP, S_IXOTH).
  const ReadUser: Mode := 0x100
  const ReadGroup: Mode := 0x20
  const ReadOther: Mode := 0x4
  const ExecUser: Mode := 0x40
  const ExecGroup: Mode := 0x8
  const ExecOther: Mode := 0x1

  const AllRead: Mode := ReadUser | ReadGroup | ReadOther
  const AllExec: Mode := ExecUser | ExecGroup | ExecOther

  /** The mode every directory of the filesystem gets: r-x for everyone. */
  const DirMode: Mode := TypeDirectory | AllRead | AllExec
  /** The mode of the two built-in files: r-- for everyone. */
  const FileMode: Mode := TypeRegular | AllRead

  /** S_ISDIR */
  predicate IsDir(m: Mode) {
    m & TypeMask == TypeDirectory
  }

  /** S_ISREG */
  predicate IsReg(m: Mode) {
    m & TypeMask == TypeRegular
  }

  /** st_ino, st_mode, st_nlink and st_size of a `struct stat`. */
  datatype Stat = Stat(ino: nat, mode: Mode, nlink: nat, size: int)

  /** A record as `calloc` leaves it. */
  const Zeroed: Stat := Stat(0, 0, 0, 0)

  /** The two modes are of the kinds their names say, in octal 040555 and
      0100444, and a zeroed record is of neither kind. */
  lemma ModeKinds()
    ensures IsDir(DirMode) && !IsReg(DirMode) && DirMode == 0x416D
    ensures IsReg(FileMode) && !IsDir(FileMode) && FileMode == 0x8124
    ensures !IsDir(Zeroed.mode) && !IsReg(Zeroed.mode)
  {
  }
}
