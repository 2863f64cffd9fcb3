/** The hard-coded namespace: the reserved inode numbers, the capacity of
    the stat table, the bytes of the two built-in files, and the table as
    initialisation leaves it. */
module InodeTable {
  import opened Attributes

  const RootDir: nat := 1
  const AssignDir: nat := 2
  const UsernameFile: nat := 3
  const FeatureFile: nat := 4

  /** The table has FileCount + 1 slots, indexed by inode number. */
  const FileCount: nat := 100

  /** The bytes of `assignment/username`, with the C terminator: the
      filesystem reports and serves `sizeof` bytes, NUL included. */
  const UsernameContent: string := "p15jra\n\0"

  /** The bytes of `assignment/features`, with the C terminator. */
  const FeatureContent: string :=
    "I have implemented the following features:\n- Directory Listing\n-Directory Creation and Removal\n- File Creation and Unlinking\n- File Modifications\0"

  /** A stat table of the right size. */
  predicate WellSized(t: seq<Stat>) {
    |t| == FileCount + 1
  }

  /** The record initialisation writes into slot `i`: st_ino, st_mode and
      st_nlink for the four reserved inodes, st_size for the two files;
      every other field and every other slot keeps its zero. */
  function InitialRecord(i: nat): Stat {
    if i == RootDir || i == AssignDir then
      Zeroed.(ino := i, mode := DirMode, nlink := 1)
    else if i == UsernameFile then
      Zeroed.(ino := i, mode := FileMode, size := |UsernameContent|, nlink := 1)
    else if i == FeatureFile then
      Zeroed.(ino := i, mode := FileMode, size := |FeatureContent|, nlink := 1)
    else
      Zeroed
  }

  /** The whole table right after initialisation. */
  function InitialTable(): (t: seq<Stat>)
    ensures WellSized(t)
  {
    seq(FileCount + 1, i requires 0 <= i => InitialRecord(i))
  }

  /** The layout after initialisation, field by field: two r-x directories,
      two r-- files whose sizes count the terminator (8 and 146 bytes),
      and 97 all-zero slots, slot 0 among them. */
  lemma InitialLayout()
    ensures var t := InitialTable();
      && t[RootDir] == Stat(1, DirMode, 1, 0)
      && t[AssignDir] == Stat(2, DirMode, 1, 0)
      && t[UsernameFile] == Stat(3, FileMode, 1, 8)
      && t[FeatureFile] == Stat(4, FileMode, 1, 146)
      && IsDir(t[RootDir].mode) && IsDir(t[AssignDir].mode)
      && IsReg(t[UsernameFile].mode) && IsReg(t[FeatureFile].mode)
      && t[0] == Zeroed
      && forall i :: FeatureFile < i < |t| ==> t[i] == Zeroed
  {
  }
}
