/** Three places where the handlers as written disagree with what they
    evidently intend, each stated twice: once as written, with the input
    that shows the discrepancy, and once corrected, with the intended
    property proved. */
module Findings {
  import opened Attributes
  import opened Reply
  import opened InodeTable
  import opened Handlers
  import opened Listing

  // ---------------------------------------------------------------------
  // read: the zero-length reply aborts.

  /** What a read request ends in when run as written: a reply, or the
      failure of the assertion that the reply data is not NULL. */
  datatype ReadOutcome = Replied(reply: Result<string>) | AssertionFailed

  /** read as written: on an offset at or past the end of a file the data
      pointer is never set, so the assertion before the reply fails. A
      negative offset goes the same way, since it is compared against an
      unsigned size. */
  function ReadAsWritten(ino: nat, off: int, size: nat): (o: ReadOutcome)
    ensures o.AssertionFailed? <==>
      (ino == UsernameFile || ino == FeatureFile) && (off < 0 || off >= |FileContent(ino)|)
    ensures o.Replied? ==> o.reply == Read(ino, off, size)
  {
    if ino == RootDir || ino == AssignDir then
      Replied(Err(IsDirectory))
    else if ino == UsernameFile || ino == FeatureFile then
      var content := FileContent(ino);
      if off < 0 || off >= |content| then AssertionFailed
      else Replied(Ok(Window(content, off, size)))
    else
      Replied(Err(BadDescriptor))
  }

  /** The input that shows it: a read request at the end of the username
      file aborts, where the intended reply (Read) is empty. */
  lemma ReadAtEndAborts()
    ensures ReadAsWritten(UsernameFile, 8, 4096) == AssertionFailed
    ensures Read(UsernameFile, 8, 4096) == Ok([])
  {
  }

  // ---------------------------------------------------------------------
  // lookup: "features" resolves to the username file.

  /** lookup as intended: every name resolves to the inode it is listed
      with, "features" to the features file. */
  function LookupIntended(t: seq<Stat>, parent: nat, name: string): (r: Result<EntryParam>)
    requires WellSized(t)
    ensures r.Ok? <==> Resolvable(parent, name)
    ensures r.Err? ==> r.error == NoEntry
    ensures r.Ok? ==>
      r.value.ino == (if parent == RootDir then AssignDir else if name == "username" then UsernameFile else FeatureFile)
    ensures r.Ok? ==> r.value.attr == t[r.value.ino] && r.value.generation == 1
  {
    if parent == RootDir && name == "assignment" then
      Ok(Entry(AssignDir, t[AssignDir]))
    else if parent == AssignDir && name == "username" then
      Ok(Entry(UsernameFile, t[UsernameFile]))
    else if parent == AssignDir && name == "features" then
      Ok(Entry(FeatureFile, t[FeatureFile]))
    else
      Err(NoEntry)
  }

  /** Corrected, lookup and readdir agree on every table: a name resolves
      in a directory exactly when it is one of the directory's listed
      children, and to the slot it is listed with. */
  lemma LookupIntendedAgreesWithListing(t: seq<Stat>, d: nat, name: string)
    requires WellSized(t)
    ensures LookupIntended(t, d, name).Ok? <==>
      exists j :: 0 <= j < |Children(d)| && Children(d)[j].0 == name
    ensures forall j :: 0 <= j < |Children(d)| && Children(d)[j].0 == name ==>
      LookupIntended(t, d, name) == Ok(Entry(Children(d)[j].1, t[Children(d)[j].1]))
  {
    var kids := Children(d);
    if LookupIntended(t, d, name).Ok? {
      if d == RootDir {
        assert kids[0].0 == name;
      } else if name == "username" {
        assert kids[0].0 == name;
      } else {
        assert kids[1].0 == name;
      }
    }
  }

  /** The input that shows it: after initialisation, the assignment
      directory lists "features" with the features file's record (inode 4,
      146 bytes), while looking the name up answers with inode 3 and the
      username file's record (8 bytes). */
  lemma FeaturesLookupDisagrees()
    ensures var t := InitialTable();
      && ReaddirReply(t, AssignDir, 0).value[3] == DirEntry("features", Stat(4, FileMode, 1, 146), 4)
      && Lookup(t, AssignDir, "features") == Ok(Entry(3, Stat(3, FileMode, 1, 8)))
      && LookupIntended(t, AssignDir, "features") == Ok(Entry(4, Stat(4, FileMode, 1, 146)))
  {
  }

  // ---------------------------------------------------------------------
  // readdir: the next-offsets restart at 1 whatever the request's offset.

  /** The tail of listing `l` that a request at offset `off` gets when
      each entry carries its position + 1: it starts at position `off` and
      is empty past the end. */
  function TailFrom(l: seq<(string, Stat)>, off: int): (es: seq<DirEntry>)
    ensures |es| == if off >= |l| then 0 else if off < 0 then |l| else |l| - off
  {
    if off >= |l| then []
    else if off < 0 then Numbered(l, 1)
    else Numbered(l[off..], off + 1)
  }

  /** readdir as intended by the offset protocol: the entry at position p
      of the full listing carries p + 1 as the offset to resume from, a
      request at offset o starts at position o, and past the end the reply
      is empty. */
  function ReaddirResumable(t: seq<Stat>, ino: nat, off: int): (r: Result<seq<DirEntry>>)
    requires WellSized(t)
    requires off >= 2 + |Children(ino)| || ino <= FileCount
    ensures off >= 2 + |Children(ino)| ==> r == Ok([])
    ensures off < 2 + |Children(ino)| ==> (r.Err? <==> !IsDir(t[ino].mode))
  {
    if off >= 2 + |Children(ino)| then
      Ok([])
    else if !IsDir(t[ino].mode) then
      Err(NotDirectory)
    else
      Ok(TailFrom(FullListing(t, ino), off))
  }

  /** Dropping the first `k` entries of a numbered listing leaves the
      rest of the listing, numbered from `first + k`. */
  lemma {:induction false} NumberedDrop(l: seq<(string, Stat)>, first: int, k: nat)
    requires k <= |l|
    ensures Numbered(l, first)[k..] == Numbered(l[k..], first + k)
  {
    if k > 0 {
      NumberedDrop(l[1..], first + 1, k - 1);
      assert l[1..][k - 1..] == l[k..];
    }
  }

  /** Resuming a tail at the offset entry `j` carries gives the entries
      after `j`. */
  lemma TailFromResume(l: seq<(string, Stat)>, off: int, j: nat)
    requires j < |TailFrom(l, off)|
    ensures TailFrom(l, TailFrom(l, off)[j].next) == TailFrom(l, off)[j + 1..]
  {
    var start := if off < 0 then 0 else off;
    var es := TailFrom(l, off);
    assert l[start..] == if off < 0 then l else l[off..];
    assert es == Numbered(l[start..], start + 1);
    NumberedAt(l[start..], start + 1);
    var next := start + j + 1;
    assert es[j].next == next;
    if next >= |l| {
      assert es[j + 1..] == [];
    } else {
      NumberedDrop(l[start..], start + 1, j + 1);
      assert l[start..][j + 1..] == l[next..];
      assert es[j + 1..] == Numbered(l[next..], next + 1);
    }
  }

  /** Corrected, a listing can be resumed: asking again at the offset an
      entry carries returns exactly the entries that followed it. */
  lemma ResumeAfterEntry(t: seq<Stat>, ino: nat, off: int, j: nat)
    requires WellSized(t) && ino <= FileCount
    requires ReaddirResumable(t, ino, off).Ok?
    requires j < |ReaddirResumable(t, ino, off).value|
    ensures ReaddirResumable(t, ino, ReaddirResumable(t, ino, off).value[j].next)
         == Ok(ReaddirResumable(t, ino, off).value[j + 1..])
  {
    TailFromResume(FullListing(t, ino), off, j);
  }

  /** From offset 0, the listing as written and the corrected one agree. */
  lemma ResumableAgreesFromStart(t: seq<Stat>, ino: nat)
    requires WellSized(t) && ino <= FileCount
    ensures ReaddirResumable(t, ino, 0) == ReaddirReply(t, ino, 0)
  {
  }

  /** The input that shows it: as written, a request at offset 2 on the
      assignment directory answers "username" with offset 1 and "features"
      with offset 2, so resuming at the offset of the last entry returns
      the same two entries again, while the corrected listing is done. */
  lemma ResumeAsWrittenRepeats()
    ensures var t := InitialTable();
      var r := ReaddirReply(t, AssignDir, 2).value;
      && |r| == 2 && r[0].name == "username" && r[1].name == "features"
      && r[0].next == 1 && r[1].next == 2
      && ReaddirReply(t, AssignDir, r[1].next) == Ok(r)
      && ReaddirResumable(t, AssignDir, 4) == Ok([])
  {
  }
}
