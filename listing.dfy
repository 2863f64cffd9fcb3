/** Directory enumeration. A listing is ".", "..", then the fixed children
    of the directory; a readdir request at an offset gets a tail of that
    listing, each entry numbered with the offset of the entry after it. */
module Listing {
  import opened Attributes
  import opened Reply
  import opened InodeTable

  /** The fixed children of each directory, by name and slot: "assignment"
      in the root, "username" and "features" in the assignment directory,
      nothing anywhere else. */
  function Children(ino: nat): (c: seq<(string, nat)>)
    ensures forall j :: 0 <= j < |c| ==> c[j].1 <= FeatureFile
  {
    if ino == RootDir then [("assignment", AssignDir)]
    else if ino == AssignDir then [("username", UsernameFile), ("features", FeatureFile)]
    else []
  }

  /** The full listing of directory `ino`: itself as ".", the root as ".."
      (every directory's parent is taken to be the root), then its children
      with the attributes of their slots. */
  function FullListing(t: seq<Stat>, ino: nat): (l: seq<(string, Stat)>)
    requires WellSized(t) && ino <= FileCount
    ensures |l| == 2 + |Children(ino)|
    ensures l[0] == (".", t[ino]) && l[1] == ("..", t[RootDir])
    ensures forall j :: 0 <= j < |Children(ino)| ==>
      l[2 + j] == (Children(ino)[j].0, t[Children(ino)[j].1])
  {
    var kids := Children(ino);
    [(".", t[ino]), ("..", t[RootDir])] + seq(|kids|, j requires 0 <= j < |kids| => (kids[j].0, t[kids[j].1]))
  }

  /** Entries for the listing `l`, the first numbered `first`. */
  function Numbered(l: seq<(string, Stat)>, first: int): (es: seq<DirEntry>)
    ensures |es| == |l|
  {
    if l == [] then [] else [DirEntry(l[0].0, l[0].1, first)] + Numbered(l[1..], first + 1)
  }

  /** Entry `j` of a numbered listing is element `j` with number
      `first + j`. */
  lemma {:induction false} NumberedAt(l: seq<(string, Stat)>, first: int)
    ensures forall j :: 0 <= j < |l| ==> Numbered(l, first)[j] == DirEntry(l[j].0, l[j].1, first + j)
  {
    if l != [] {
      NumberedAt(l[1..], first + 1);
    }
  }

  /** How many leading entries of the listing a request at `off` skips:
      "." is sent only below offset 1, ".." only below offset 2. */
  function Skipped(off: int): nat {
    if off < 1 then 0 else if off < 2 then 1 else 2
  }

  /** The reply to readdir(ino, off). Past offset 2 the reply is empty,
      whatever `ino` is, before the slot is even looked at; otherwise a
      slot that is not a directory is refused with ENOTDIR, and a
      directory gets the listing less its skipped entries, numbered from 1
      whatever the offset was. */
  function ReaddirReply(t: seq<Stat>, ino: nat, off: int): (r: Result<seq<DirEntry>>)
    requires WellSized(t)
    requires off > 2 || ino <= FileCount
    ensures off > 2 ==> r == Ok([])
    ensures off <= 2 ==> (r.Err? <==> !IsDir(t[ino].mode))
    ensures r.Err? ==> r.error == NotDirectory
    ensures off <= 2 && r.Ok? ==>
      |r.value| == |FullListing(t, ino)| - Skipped(off) &&
      forall j :: 0 <= j < |r.value| ==>
        r.value[j] == DirEntry(FullListing(t, ino)[Skipped(off) + j].0, FullListing(t, ino)[Skipped(off) + j].1, j + 1)
  {
    if off > 2 then
      Ok([])
    else if !IsDir(t[ino].mode) then
      Err(NotDirectory)
    else
      NumberedAt(FullListing(t, ino)[Skipped(off)..], 1);
      Ok(Numbered(FullListing(t, ino)[Skipped(off)..], 1))
  }

  /** A listing of a directory from offset 0 (or below) holds ".", with the
      directory's own attributes, then "..", with the root's, then each
      child with its slot's attributes, numbered 1, 2, 3, ... */
  lemma ReaddirFromStart(t: seq<Stat>, ino: nat, off: int)
    requires WellSized(t) && ino <= FileCount && IsDir(t[ino].mode)
    requires off <= 0
    ensures var r := ReaddirReply(t, ino, off);
      && r.Ok?
      && |r.value| == 2 + |Children(ino)|
      && r.value[0] == DirEntry(".", t[ino], 1)
      && r.value[1] == DirEntry("..", t[RootDir], 2)
      && forall j :: 0 <= j < |Children(ino)| ==>
           r.value[2 + j] == DirEntry(Children(ino)[j].0, t[Children(ino)[j].1], 3 + j)
  {
    var r := ReaddirReply(t, ino, off);
    forall j | 0 <= j < |Children(ino)|
      ensures r.value[2 + j] == DirEntry(Children(ino)[j].0, t[Children(ino)[j].1], 3 + j)
    {
      assert FullListing(t, ino)[2 + j] == (Children(ino)[j].0, t[Children(ino)[j].1]);
    }
  }

  /** The listings of the two hard-coded directories after initialisation,
      entry by entry. */
  lemma InitialListings()
    ensures ReaddirReply(InitialTable(), RootDir, 0) == Ok([
      DirEntry(".", InitialRecord(RootDir), 1),
      DirEntry("..", InitialRecord(RootDir), 2),
      DirEntry("assignment", InitialRecord(AssignDir), 3)])
    ensures ReaddirReply(InitialTable(), AssignDir, 0) == Ok([
      DirEntry(".", InitialRecord(AssignDir), 1),
      DirEntry("..", InitialRecord(RootDir), 2),
      DirEntry("username", InitialRecord(UsernameFile), 3),
      DirEntry("features", InitialRecord(FeatureFile), 4)])
  {
    var t := InitialTable();
    InitialLayout();
    ReaddirFromStart(t, RootDir, 0);
    ReaddirFromStart(t, AssignDir, 0);
    var root, assign := ReaddirReply(t, RootDir, 0).value, ReaddirReply(t, AssignDir, 0).value;
    assert t[RootDir] == InitialRecord(RootDir) && t[AssignDir] == InitialRecord(AssignDir);
    assert |root| == 3 && root[2] == DirEntry("assignment", InitialRecord(AssignDir), 3);
    assert root == [DirEntry(".", InitialRecord(RootDir), 1), DirEntry("..", InitialRecord(RootDir), 2), DirEntry("assignment", InitialRecord(AssignDir), 3)];
    assert assign[2] == DirEntry("username", InitialRecord(UsernameFile), 3);
    assert assign[3] == DirEntry("features", InitialRecord(FeatureFile), 4);
    assert assign == [DirEntry(".", InitialRecord(AssignDir), 1), DirEntry("..", InitialRecord(RootDir), 2),
                      DirEntry("username", InitialRecord(UsernameFile), 3), DirEntry("features", InitialRecord(FeatureFile), 4)];
  }
}
