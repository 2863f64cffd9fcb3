/** The filesystem's mutable state: the stat table, an array of
    FileCount + 1 records indexed by inode number, and the inode counter;
    with the handlers that write them (init, mkdir, mknod), the readdir
    handler that reads the table in place, and the handlers that only
    reply "not implemented". */
module Filesystem {
  import opened Attributes
  import opened Reply
  import opened InodeTable
  import opened Handlers
  import opened Listing

  /** The table after mkdir with the counter at `n`: slot `n` gets inode
      number `n`, the directory mode and one link; its size is left as it
      was, and every other slot is untouched. */
  function MkdirTable(t: seq<Stat>, n: nat): (t': seq<Stat>)
    requires WellSized(t) && n <= FileCount
    ensures WellSized(t')
    ensures t'[n] == Stat(n, DirMode, 1, t[n].size) && IsDir(t'[n].mode)
    ensures forall i :: 0 <= i < |t| && i != n ==> t'[i] == t[i]
  {
    ModeKinds();
    t[n := t[n].(ino := n, mode := DirMode, nlink := 1)]
  }

  /** As mkdir does not advance the counter, a second mkdir with no mknod
      in between writes the same slot again and changes nothing more. */
  lemma MkdirRepeated(t: seq<Stat>, n: nat)
    requires WellSized(t) && n <= FileCount
    ensures MkdirTable(MkdirTable(t, n), n) == MkdirTable(t, n)
  {
  }

  /** A directory made by mkdir is not linked into any directory: lookup
      answers exactly as before it, on every (parent, name) pair, up to
      the attributes of the overwritten slot. */
  lemma MkdirLeavesLookup(t: seq<Stat>, n: nat, parent: nat, name: string)
    requires WellSized(t) && n <= FileCount
    ensures Lookup(MkdirTable(t, n), parent, name).Ok? == Lookup(t, parent, name).Ok?
    ensures n != AssignDir && n != UsernameFile ==>
      Lookup(MkdirTable(t, n), parent, name) == Lookup(t, parent, name)
  {
  }

  /** Starting from the initial table, the first mkdir (counter 0)
      overwrites slot 0, which readdir then lists as a directory of its
      own, and a mkdir after four mknods (counter 4) turns the features
      file's record into a directory that keeps its size. */
  lemma MkdirOverwritesReservedSlots()
    ensures var t := MkdirTable(InitialTable(), 0);
      && t[0] == Stat(0, DirMode, 1, 0) && t[1..] == InitialTable()[1..]
      && ReaddirReply(InitialTable(), 0, 0) == Err(NotDirectory)
      && ReaddirReply(t, 0, 0) == Ok([DirEntry(".", t[0], 1), DirEntry("..", t[RootDir], 2)])
    ensures var t := MkdirTable(InitialTable(), FeatureFile);
      t[FeatureFile] == Stat(4, DirMode, 1, 146) && IsDir(t[FeatureFile].mode)
  {
    var t := MkdirTable(InitialTable(), 0);
    InitialLayout();
    ModeKinds();
    ReaddirFromStart(t, 0, 0);
    var r := ReaddirReply(t, 0, 0).value;
    assert |r| == 2;
    assert r == [DirEntry(".", t[0], 1), DirEntry("..", t[RootDir], 2)];
  }

  class Filesystem {
    /** file_stats */
    var fileStats: array<Stat>
    /** curr_inode_num */
    var currInodeNum: int

    ghost predicate Valid()
      reads this
    {
      fileStats.Length == FileCount + 1 && currInodeNum >= 0
    }

    /** The table's current contents. */
    ghost function Table(): (t: seq<Stat>)
      reads this, fileStats
      requires Valid()
      ensures WellSized(t)
    {
      fileStats[..]
    }

    /** Initialisation: a zero-filled table (calloc) in which the four
        reserved slots get their fields written one by one; the counter
        starts at 0. */
    constructor Init()
      ensures Valid() && fresh(fileStats)
      ensures Table() == InitialTable()
      ensures currInodeNum == 0
    {
      var stats := new Stat[FileCount + 1](_ => Zeroed);
      stats[RootDir] := stats[RootDir].(ino := RootDir);
      stats[RootDir] := stats[RootDir].(mode := DirMode);
      stats[RootDir] := stats[RootDir].(nlink := 1);

      stats[AssignDir] := stats[AssignDir].(ino := AssignDir);
      stats[AssignDir] := stats[AssignDir].(mode := DirMode);
      stats[AssignDir] := stats[AssignDir].(nlink := 1);

      stats[UsernameFile] := stats[UsernameFile].(ino := UsernameFile);
      stats[UsernameFile] := stats[UsernameFile].(mode := FileMode);
      stats[UsernameFile] := stats[UsernameFile].(size := |UsernameContent|);
      stats[UsernameFile] := stats[UsernameFile].(nlink := 1);

      stats[FeatureFile] := stats[FeatureFile].(ino := FeatureFile);
      stats[FeatureFile] := stats[FeatureFile].(mode := FileMode);
      stats[FeatureFile] := stats[FeatureFile].(size := |FeatureContent|);
      stats[FeatureFile] := stats[FeatureFile].(nlink := 1);

      fileStats := stats;
      currInodeNum := 0;
      assert stats[..] == InitialTable();
    }

    /** mkdir: writes a directory record into the slot the counter names,
        leaves the counter where it is, and answers with that slot's inode
        number and new record. The parent, the name and the requested mode
        are not used. */
    method Mkdir(parent: nat, name: string, mode: Mode) returns (e: EntryParam)
      requires Valid() && currInodeNum <= FileCount
      modifies fileStats
      ensures Valid()
      ensures Table() == MkdirTable(old(Table()), currInodeNum)
      ensures currInodeNum == old(currInodeNum)
      ensures e == Entry(currInodeNum, Table()[currInodeNum])
    {
      var n := currInodeNum;
      fileStats[n] := fileStats[n].(ino := n);
      fileStats[n] := fileStats[n].(mode := DirMode);
      fileStats[n] := fileStats[n].(nlink := 1);
      e := Entry(n, fileStats[n]);
    }

    /** mknod: advances the counter by one and touches no slot; it answers
        with the counter's old value as the inode number, carrying the
        username file's attributes. */
    method Mknod(parent: nat, name: string, mode: Mode, rdev: nat) returns (e: EntryParam)
      requires Valid()
      modifies this`currInodeNum
      ensures Valid()
      ensures currInodeNum == old(currInodeNum) + 1
      ensures e == Entry(old(currInodeNum), Table()[UsernameFile])
    {
      e := Entry(currInodeNum, fileStats[UsernameFile]);
      currInodeNum := currInodeNum + 1;
    }

    /** readdir: the reply is built by appending entries one after another
        with a running entry number; it is exactly ReaddirReply of the
        current table. The size budget of the reply buffer is not
        modelled. */
    method Readdir(ino: nat, size: nat, off: int) returns (r: Result<seq<DirEntry>>)
      requires Valid()
      requires off > 2 || ino <= FileCount
      ensures r == ReaddirReply(Table(), ino, off)
    {
      if off > 2 {
        return Ok([]);
      }
      var self := fileStats[ino];
      if !IsDir(self.mode) {
        return Err(NotDirectory);
      }
      var parent := fileStats[RootDir];
      var entries: seq<DirEntry> := [];
      var next := 0;
      if off < 1 {
        next := next + 1;
        entries := entries + [DirEntry(".", self, next)];
      }
      if off < 2 {
        next := next + 1;
        entries := entries + [DirEntry("..", parent, next)];
      }
      if ino == RootDir {
        next := next + 1;
        entries := entries + [DirEntry("assignment", fileStats[AssignDir], next)];
      } else if ino == AssignDir {
        next := next + 1;
        entries := entries + [DirEntry("username", fileStats[UsernameFile], next)];
        next := next + 1;
        entries := entries + [DirEntry("features", fileStats[FeatureFile], next)];
      }
      r := Ok(entries);
      assert Table()[ino] == self;
      ghost var spec := ReaddirReply(Table(), ino, off).value;
      assert |entries| == |spec|;
      forall j | 0 <= j < |entries|
        ensures entries[j] == spec[j]
      {
        assert FullListing(Table(), ino)[Skipped(off) + j] == (entries[j].name, entries[j].attr);
      }
      assert entries == spec;
    }

    /** create: not implemented. */
    method Create(parent: nat, name: string, mode: Mode) returns (err: Errno)
      ensures err == NotImplemented
    {
      err := NotImplemented;
    }

    /** open: not implemented. */
    method Open(ino: nat) returns (err: Errno)
      ensures err == NotImplemented
    {
      err := NotImplemented;
    }

    /** rmdir: walks the inode numbers issued so far without looking at
        any of them, then replies "not implemented". */
    method Rmdir(parent: nat, name: string) returns (err: Errno)
      requires Valid()
      ensures err == NotImplemented
    {
      for i := 0 to currInodeNum {
      }
      err := NotImplemented;
    }

    /** setattr: not implemented. */
    method Setattr(ino: nat, attr: Stat, toSet: int) returns (err: Errno)
      ensures err == NotImplemented
    {
      err := NotImplemented;
    }

    /** statfs: not implemented. */
    method Statfs(ino: nat) returns (err: Errno)
      ensures err == NotImplemented
    {
      err := NotImplemented;
    }

    /** unlink: not implemented. */
    method Unlink(parent: nat, name: string) returns (err: Errno)
      ensures err == NotImplemented
    {
      err := NotImplemented;
    }

    /** write: not implemented. */
    method Write(ino: nat, buf: string, size: nat, off: int) returns (err: Errno)
      ensures err == NotImplemented
    {
      err := NotImplemented;
    }
  }
}
